/**
 * `classify_columns_by_keywords`: split column names into groups, one per
 * keyword category. Categories are visited longest keyword first; each takes
 * every still unclaimed column whose name contains one of its keywords,
 * ignoring case; whatever no category takes goes to the catch-all "Other".
 * Column groups are sets: the source iterates a Python set, so the order of
 * columns inside a group carries no meaning.
 */
module Classifier {
  import opened Wrappers
  import opened OrderedDict
  import opened Text
  import opened Priority

  /** The catch-all category for columns that no keyword claims. */
  const Other := "Other"

  /** The one way a classification fails: `max` over an empty keyword list raises while sorting. */
  datatype ClassifyError = EmptyKeywordList

  /** The result dictionary: category name to the names of the columns it holds. */
  type Groups = Dict<set<string>>

  /** The compiled pattern `(kw1|kw2|...)` with `re.IGNORECASE` finds a keyword in the column name. */
  predicate Matches(column: string, keywords: seq<string>)
  {
    exists kw :: kw in keywords && ContainsIgnoreCase(column, kw)
  }

  /** `[col for col in remaining_cols if pattern.search(str(col))]`, as a set. */
  function Matched(remaining: set<string>, keywords: seq<string>): set<string>
  {
    set c | c in remaining && Matches(c, keywords)
  }

  /** `set(df.columns)`. */
  function ColumnSet(columns: seq<string>): set<string>
  {
    set c | c in columns
  }

  /**
   * The position of the first category, in visiting order, whose keywords
   * match the column. Defined by extending the visited prefix one category at
   * a time, as the loop does.
   */
  function FirstClaimant(order: seq<Category>, column: string): (r: Option<nat>)
    ensures r.Some? ==> r.value < |order| && Matches(column, order[r.value].value)
    ensures r.Some? ==> forall j :: 0 <= j < r.value ==> !Matches(column, order[j].value)
    ensures r.None? ==> forall j :: 0 <= j < |order| ==> !Matches(column, order[j].value)
    decreases |order|
  {
    if order == [] then None
    else
      var prefix := order[..|order| - 1];
      assert forall j :: 0 <= j < |prefix| ==> prefix[j] == order[j];
      match FirstClaimant(prefix, column)
      case Some(k) => Some(k)
      case None => if Matches(column, order[|order| - 1].value) then Some(|order| - 1) else None
  }

  /** The category a column belongs in: the first one that matches it, else the catch-all. */
  function Assigned(order: seq<Category>, column: string): string
  {
    match FirstClaimant(order, column)
    case Some(k) => order[k].key
    case None => Other
  }

  /** The columns whose first matching category is the one at position `k`. */
  function Owned(order: seq<Category>, cols: set<string>, k: nat): set<string>
  {
    set c | c in cols && FirstClaimant(order, c) == Some(k)
  }

  /** The loop state of the source: `classified_dfs` and `remaining_cols`. */
  datatype Progress = Progress(classified: Groups, remaining: set<string>)

  /** The loop state after visiting the categories of `order`, one at a time. */
  function Run(order: seq<Category>, cols: set<string>): Progress
    decreases |order|
  {
    if order == [] then Progress([], cols)
    else
      var before := Run(order[..|order| - 1], cols);
      var category := order[|order| - 1];
      var matched := Matched(before.remaining, category.value);
      if matched != {} then
        Progress(Put(before.classified, category.key, matched), before.remaining - matched)
      else
        before
  }

  /** The whole function: sort, claim, then add the leftovers under "Other". */
  function Classify(columns: seq<string>, categories: Dict<seq<string>>): Result<Groups, ClassifyError>
  {
    if !HasKeywords(categories) then Err(EmptyKeywordList)
    else
      var done := Run(PriorityOrder(categories), ColumnSet(columns));
      if done.remaining != {} then Ok(Put(done.classified, Other, done.remaining))
      else Ok(done.classified)
  }

  /** The source's loop: claim columns category by category, shrinking the remaining set. */
  method ClassifyColumnsByKeywords(columns: seq<string>, categories: Dict<seq<string>>)
    returns (r: Result<Groups, ClassifyError>)
    ensures r == Classify(columns, categories)
  {
    if !HasKeywords(categories) {
      return Err(EmptyKeywordList);
    }
    var classified: Groups := [];
    var remaining := ColumnSet(columns);
    var order := PriorityOrder(categories);
    for k := 0 to |order|
      invariant Progress(classified, remaining) == Run(order[..k], ColumnSet(columns))
    {
      assert order[..k + 1][..k] == order[..k];
      var category := order[k];
      var matched := Matched(remaining, category.value);
      if matched != {} {
        classified := Put(classified, category.key, matched);
        remaining := remaining - matched;
      }
    }
    assert order[..|order|] == order;
    if remaining != {} {
      classified := Put(classified, Other, remaining);
    }
    return Ok(classified);
  }

  // ---------------------------------------------------------------------------
  // What the loop state means

  /**
   * A column is still unclaimed after a run exactly when none of the visited
   * categories matches it: a claimed column is never considered again.
   */
  lemma {:induction false} RunRemaining(order: seq<Category>, cols: set<string>)
    ensures forall c :: c in Run(order, cols).remaining <==> c in cols && FirstClaimant(order, c).None?
  {
    if order != [] {
      RunRemaining(order[..|order| - 1], cols);
    }
  }

  /** Visiting one more category leaves the earlier categories' columns as they were. */
  lemma OwnedSnoc(order: seq<Category>, cols: set<string>)
    requires order != []
    ensures forall k :: 0 <= k < |order| - 1 ==> Owned(order, cols, k) == Owned(order[..|order| - 1], cols, k)
    ensures Owned(order, cols, |order| - 1) ==
      Matched(Run(order[..|order| - 1], cols).remaining, order[|order| - 1].value)
  {
    RunRemaining(order[..|order| - 1], cols);
  }

  /**
   * After a run, a visited category holds exactly the columns it is the first
   * to match, and it is present only when it holds some; no other key is present.
   */
  lemma {:induction false} RunClassified(order: seq<Category>, cols: set<string>)
    requires DistinctKeys(order)
    ensures DistinctKeys(Run(order, cols).classified)
    ensures forall k :: 0 <= k < |order| ==>
      Get(Run(order, cols).classified, order[k].key) ==
      if Owned(order, cols, k) == {} then None else Some(Owned(order, cols, k))
    ensures forall n :: n !in Keys(order) ==> Get(Run(order, cols).classified, n) == None
  {
    if order != [] {
      var prefix := order[..|order| - 1];
      var category := order[|order| - 1];
      var before := Run(prefix, cols);
      var t := Run(order, cols).classified;
      var matched := Matched(before.remaining, category.value);
      assert Keys(prefix) == Keys(order)[..|prefix|];
      assert DistinctKeys(prefix);
      assert category.key !in Keys(prefix);
      RunClassified(prefix, cols);
      OwnedSnoc(order, cols);
      forall n
        ensures Get(t, n) == if n == category.key && matched != {} then Some(matched) else Get(before.classified, n)
      {
        if matched != {} {
          PutGet(before.classified, category.key, matched, n);
        }
      }
      forall k | 0 <= k < |prefix|
        ensures Get(t, order[k].key) == if Owned(order, cols, k) == {} then None else Some(Owned(order, cols, k))
      {
        assert prefix[k] == order[k];
      }
      assert Get(before.classified, category.key) == None;
      assert order[|prefix|] == category;
      forall n | n !in Keys(order)
        ensures Get(t, n) == None
      {
        assert n != category.key;
      }
    }
  }

  // ---------------------------------------------------------------------------
  // Properties of the classification

  /** The call fails, before any matching, exactly when some category has no keywords. */
  lemma ClassifyFailsOnEmptyKeywords(columns: seq<string>, categories: Dict<seq<string>>)
    ensures Classify(columns, categories).Err? <==> exists i :: 0 <= i < |categories| && categories[i].value == []
  {
  }

  /** A column is in group `n` of the result. */
  predicate InGroup(groups: Groups, n: string, column: string)
  {
    Get(groups, n).Some? && column in Get(groups, n).value
  }

  /**
   * The result in full (up to the order of its keys): a column is in group `n`
   * exactly when it is an input column and `n` is the first category, in
   * priority order, whose keywords match it, or `n` is "Other" and no category
   * matches it; every group present is non-empty; the keys are distinct.
   * A category named "Other" is excluded (see OtherCategoryIsOverwritten).
   */
  lemma ClassifyAssigns(columns: seq<string>, categories: Dict<seq<string>>)
    requires HasKeywords(categories) && DistinctKeys(categories)
    requires Other !in Keys(categories)
    ensures Classify(columns, categories).Ok?
    ensures DistinctKeys(Classify(columns, categories).value)
    ensures forall n, c :: InGroup(Classify(columns, categories).value, n, c) <==>
      c in columns && Assigned(PriorityOrder(categories), c) == n
    ensures forall n :: Get(Classify(columns, categories).value, n).Some? ==>
      Get(Classify(columns, categories).value, n).value != {}
  {
    var t := Classify(columns, categories).value;
    ClassifyLookupWithoutOther(columns, categories);
    forall n, c
      ensures InGroup(t, n, c) <==> c in columns && Assigned(PriorityOrder(categories), c) == n
    {
      AssignedInGroup(columns, categories, n, c);
    }
    forall n | Get(t, n).Some?
      ensures Get(t, n).value != {}
    {
      AssignedInGroup(columns, categories, n, Other);
    }
  }

  /** The visiting order has the declared keys, each once, and never "Other". */
  lemma PriorityOrderKeys(categories: Dict<seq<string>>)
    requires HasKeywords(categories) && DistinctKeys(categories)
    requires Other !in Keys(categories)
    ensures DistinctKeys(PriorityOrder(categories))
    ensures Other !in Keys(PriorityOrder(categories))
  {
    var order := PriorityOrder(categories);
    PriorityOrderIsSorted(categories);
    PriorityOrderKeepsKeysDistinct(categories);
    forall i | 0 <= i < |order|
      ensures order[i].key != Other
    {
      assert order[i] in multiset(categories);
      var j :| 0 <= j < |categories| && categories[j] == order[i];
      assert Keys(categories)[j] == order[i].key;
    }
  }

  /**
   * Looking up a key in the result: the loop's dictionary, except that "Other"
   * holds the leftovers when there are any (replacing a category of that name).
   */
  lemma ClassifyLookup(columns: seq<string>, categories: Dict<seq<string>>)
    requires HasKeywords(categories)
    ensures Classify(columns, categories).Ok?
    ensures DistinctKeys(categories) ==> DistinctKeys(Classify(columns, categories).value)
    ensures forall n ::
      Get(Classify(columns, categories).value, n) ==
      (var done := Run(PriorityOrder(categories), ColumnSet(columns));
       if n == Other && done.remaining != {} then Some(done.remaining)
       else Get(done.classified, n))
  {
    var done := Run(PriorityOrder(categories), ColumnSet(columns));
    var t := Classify(columns, categories).value;
    if DistinctKeys(categories) {
      PriorityOrderKeepsKeysDistinct(categories);
      RunClassified(PriorityOrder(categories), ColumnSet(columns));
    }
    forall n
      ensures Get(t, n) == if n == Other && done.remaining != {} then Some(done.remaining)
                           else Get(done.classified, n)
    {
      if done.remaining != {} {
        PutGet(done.classified, Other, done.remaining, n);
      }
    }
  }

  /**
   * When no category is named "Other", that key is present in the result
   * exactly when some column is left over.
   */
  lemma ClassifyLookupWithoutOther(columns: seq<string>, categories: Dict<seq<string>>)
    requires HasKeywords(categories) && DistinctKeys(categories)
    requires Other !in Keys(categories)
    ensures Classify(columns, categories).Ok?
    ensures DistinctKeys(Classify(columns, categories).value)
    ensures forall n ::
      Get(Classify(columns, categories).value, n) ==
      (var done := Run(PriorityOrder(categories), ColumnSet(columns));
       if n == Other then (if done.remaining == {} then None else Some(done.remaining))
       else Get(done.classified, n))
  {
    ClassifyLookup(columns, categories);
    PriorityOrderKeys(categories);
    RunClassified(PriorityOrder(categories), ColumnSet(columns));
  }

  /** One column and one key of the result: the column is there exactly when it is assigned there. */
  lemma AssignedInGroup(columns: seq<string>, categories: Dict<seq<string>>, n: string, c: string)
    requires HasKeywords(categories) && DistinctKeys(categories)
    requires Other !in Keys(categories)
    ensures Classify(columns, categories).Ok?
    ensures InGroup(Classify(columns, categories).value, n, c) <==>
      c in columns && Assigned(PriorityOrder(categories), c) == n
    ensures Get(Classify(columns, categories).value, n).Some? ==> Get(Classify(columns, categories).value, n).value != {}
  {
    var order := PriorityOrder(categories);
    ClassifyLookupWithoutOther(columns, categories);
    PriorityOrderKeys(categories);
    AssignedKey(order, c);
    if n == Other {
      AssignedToOther(columns, categories, c);
    } else if n in Keys(order) {
      var k :| 0 <= k < |order| && Keys(order)[k] == n;
      AssignedToCategory(columns, categories, k, c);
    } else {
      RunClassified(order, ColumnSet(columns));
    }
  }

  /** The assigned name is "Other" exactly when no category claims the column, and otherwise a key of the order. */
  lemma AssignedKey(order: seq<Category>, c: string)
    requires Other !in Keys(order)
    ensures Assigned(order, c) == Other <==> FirstClaimant(order, c).None?
    ensures FirstClaimant(order, c).Some? ==> Assigned(order, c) == Keys(order)[FirstClaimant(order, c).value]
  {
    if FirstClaimant(order, c).Some? {
      assert Keys(order)[FirstClaimant(order, c).value] == Assigned(order, c);
    }
  }

  lemma AssignedToOther(columns: seq<string>, categories: Dict<seq<string>>, c: string)
    requires HasKeywords(categories) && DistinctKeys(categories)
    requires Other !in Keys(categories)
    ensures Classify(columns, categories).Ok?
    ensures InGroup(Classify(columns, categories).value, Other, c) <==>
      c in columns && FirstClaimant(PriorityOrder(categories), c).None?
    ensures Get(Classify(columns, categories).value, Other).Some? ==> Get(Classify(columns, categories).value, Other).value != {}
  {
    ClassifyLookupWithoutOther(columns, categories);
    RunRemaining(PriorityOrder(categories), ColumnSet(columns));
  }

  lemma AssignedToCategory(columns: seq<string>, categories: Dict<seq<string>>, k: nat, c: string)
    requires HasKeywords(categories) && DistinctKeys(categories)
    requires Other !in Keys(categories)
    requires k < |PriorityOrder(categories)|
    ensures Classify(columns, categories).Ok?
    ensures InGroup(Classify(columns, categories).value, PriorityOrder(categories)[k].key, c) <==>
      c in columns && FirstClaimant(PriorityOrder(categories), c) == Some(k)
    ensures Get(Classify(columns, categories).value, PriorityOrder(categories)[k].key).Some? ==>
      Get(Classify(columns, categories).value, PriorityOrder(categories)[k].key).value != {}
  {
    var order := PriorityOrder(categories);
    var cols := ColumnSet(columns);
    var n := order[k].key;
    var owned := Owned(order, cols, k);
    PriorityOrderKeys(categories);
    assert Keys(order)[k] == n;
    assert n != Other;
    ClassifyLookupWithoutOther(columns, categories);
    RunClassified(order, cols);
    assert Get(Classify(columns, categories).value, n) == if owned == {} then None else Some(owned);
    assert c in owned <==> c in columns && FirstClaimant(order, c) == Some(k);
  }

  /**
   * The result is a partition of the columns: every column is in exactly one
   * group, groups are disjoint, hold only input columns and are never empty.
   */
  lemma ClassifyPartitions(columns: seq<string>, categories: Dict<seq<string>>)
    requires HasKeywords(categories) && DistinctKeys(categories)
    requires Other !in Keys(categories)
    ensures Classify(columns, categories).Ok?
    ensures forall c :: c in columns ==>
      exists i :: 0 <= i < |Classify(columns, categories).value| && c in Classify(columns, categories).value[i].value
    ensures forall i :: 0 <= i < |Classify(columns, categories).value| ==>
      Classify(columns, categories).value[i].value != {} &&
      forall c :: c in Classify(columns, categories).value[i].value ==> c in columns
    ensures forall i, j :: 0 <= i < j < |Classify(columns, categories).value| ==>
      Classify(columns, categories).value[i].value !! Classify(columns, categories).value[j].value
  {
    var t := Classify(columns, categories).value;
    var order := PriorityOrder(categories);
    ClassifyAssigns(columns, categories);
    forall i | 0 <= i < |t|
      ensures Get(t, t[i].key) == Some(t[i].value)
    {
      GetEntry(t, i);
    }
    forall c | c in columns
      ensures exists i :: 0 <= i < |t| && c in t[i].value
    {
      var n := Assigned(order, c);
      assert InGroup(t, n, c);
      var i :| 0 <= i < |t| && t[i].key == n;
    }
    forall i, j | 0 <= i < j < |t|
      ensures t[i].value !! t[j].value
    {
      forall c | c in t[i].value
        ensures c !in t[j].value
      {
        assert InGroup(t, t[i].key, c);
        if c in t[j].value {
          assert InGroup(t, t[j].key, c);
        }
      }
    }
    forall i, c | 0 <= i < |t| && c in t[i].value
      ensures c in columns
    {
      assert InGroup(t, t[i].key, c);
    }
  }

  /**
   * A column in a category's group contains one of that category's keywords,
   * and no category visited earlier matches it: the first match wins.
   */
  lemma FirstMatchWins(columns: seq<string>, categories: Dict<seq<string>>, n: string, c: string)
    requires HasKeywords(categories) && DistinctKeys(categories)
    requires Classify(columns, categories).Ok? && InGroup(Classify(columns, categories).value, n, c)
    requires n != Other
    ensures exists k ::
      && 0 <= k < |PriorityOrder(categories)|
      && PriorityOrder(categories)[k].key == n
      && Matches(c, PriorityOrder(categories)[k].value)
      && forall j :: 0 <= j < k ==> !Matches(c, PriorityOrder(categories)[j].value)
  {
    var order := PriorityOrder(categories);
    var cols := ColumnSet(columns);
    var done := Run(order, cols);
    ClassifyLookup(columns, categories);
    PriorityOrderKeepsKeysDistinct(categories);
    RunClassified(order, cols);
    assert Get(done.classified, n).Some?;
    assert n in Keys(order);
    var k :| 0 <= k < |order| && Keys(order)[k] == n;
    assert order[k].key == n;
    assert c in Owned(order, cols, k);
    assert FirstClaimant(order, c) == Some(k);
  }

  /** A column is unclaimed after visiting a permutation of the categories exactly when no category matches it. */
  lemma UnclaimedMatchesNothing(categories: Dict<seq<string>>, c: string)
    requires HasKeywords(categories)
    ensures FirstClaimant(PriorityOrder(categories), c).None? <==>
      forall i :: 0 <= i < |categories| ==> !Matches(c, categories[i].value)
  {
    var order := PriorityOrder(categories);
    PriorityOrderIsSorted(categories);
    if FirstClaimant(order, c).None? {
      forall i | 0 <= i < |categories|
        ensures !Matches(c, categories[i].value)
      {
        assert categories[i] in multiset(order);
        var k :| 0 <= k < |order| && order[k] == categories[i];
      }
    } else {
      var k := FirstClaimant(order, c).value;
      assert order[k] in multiset(categories);
      var i :| 0 <= i < |categories| && categories[i] == order[k];
    }
  }

  /** The columns that no category matches. */
  function Unmatched(columns: seq<string>, categories: Dict<seq<string>>): set<string>
  {
    set c | c in columns && forall i :: 0 <= i < |categories| ==> !Matches(c, categories[i].value)
  }

  /**
   * "Other" holds exactly the columns no category matches whenever there are
   * such columns (it overwrites a category of that name); if no category is
   * named "Other", it is present only then.
   */
  lemma OtherHoldsUnmatched(columns: seq<string>, categories: Dict<seq<string>>)
    requires HasKeywords(categories)
    ensures Classify(columns, categories).Ok?
    ensures Unmatched(columns, categories) != {} ==>
      Get(Classify(columns, categories).value, Other) == Some(Unmatched(columns, categories))
    ensures Unmatched(columns, categories) == {} && Other !in Keys(categories) && DistinctKeys(categories) ==>
      Get(Classify(columns, categories).value, Other) == None
  {
    var order := PriorityOrder(categories);
    var done := Run(order, ColumnSet(columns));
    RunRemaining(order, ColumnSet(columns));
    forall c
      ensures c in done.remaining <==> c in Unmatched(columns, categories)
    {
      UnclaimedMatchesNothing(categories, c);
    }
    assert done.remaining == Unmatched(columns, categories);
    if done.remaining != {} {
      PutGet(done.classified, Other, done.remaining, Other);
    } else if Other !in Keys(categories) && DistinctKeys(categories) {
      ClassifyLookupWithoutOther(columns, categories);
    }
  }

  /** A category that ends up with no column is not a key of the result. */
  lemma CategoryWithoutColumnsIsAbsent(columns: seq<string>, categories: Dict<seq<string>>, n: string)
    requires HasKeywords(categories) && DistinctKeys(categories)
    requires forall c :: c in columns ==> Assigned(PriorityOrder(categories), c) != n
    ensures Classify(columns, categories).Ok?
    ensures Get(Classify(columns, categories).value, n) == None
  {
    var order := PriorityOrder(categories);
    var cols := ColumnSet(columns);
    var done := Run(order, cols);
    ClassifyLookup(columns, categories);
    PriorityOrderKeepsKeysDistinct(categories);
    RunClassified(order, cols);
    RunRemaining(order, cols);
    if n == Other {
      assert done.remaining == {};
    }
    if n in Keys(order) {
      var k :| 0 <= k < |order| && Keys(order)[k] == n;
      assert order[k].key == n;
      assert Owned(order, cols, k) == {};
    }
  }

  /** With no categories, every column goes to "Other"; with no columns either, the result is empty. */
  lemma NoCategories(columns: seq<string>)
    ensures Classify(columns, []) == if columns == [] then Ok([]) else Ok([Entry(Other, ColumnSet(columns))])
  {
    if columns != [] {
      assert columns[0] in ColumnSet(columns);
    }
  }

  /** No columns: nothing is claimed by any category. */
  lemma {:induction false} RunOnNoColumns(order: seq<Category>)
    ensures Run(order, {}) == Progress([], {})
  {
    if order != [] {
      RunOnNoColumns(order[..|order| - 1]);
    }
  }

  /** With no columns the result is empty, unless the keyword lists make the call fail. */
  lemma NoColumns(categories: Dict<seq<string>>)
    ensures Classify([], categories) == if HasKeywords(categories) then Ok([]) else Err(EmptyKeywordList)
  {
    if HasKeywords(categories) {
      RunOnNoColumns(PriorityOrder(categories));
      assert ColumnSet([]) == {};
    }
  }

  /** Columns whose names differ only in ASCII case go to the same category. */
  lemma {:induction false} AssignmentIgnoresCase(order: seq<Category>, c: string, c': string)
    requires Lower(c) == Lower(c')
    ensures Assigned(order, c) == Assigned(order, c')
  {
    assert forall k :: 0 <= k < |order| ==> Matches(c, order[k].value) == Matches(c', order[k].value);
    var a, b := FirstClaimant(order, c), FirstClaimant(order, c');
    if a.Some? && b.Some? {
      assert !(a.value < b.value) && !(b.value < a.value);
    }
  }
}
