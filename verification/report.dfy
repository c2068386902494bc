/**
 * The pure parts of `dcEx`: the keyword dictionary built from `group_cols`,
 * the row-to-row difference of a numeric column (an integer sketch of
 * `DataFrame.diff`), and the names of the sheets written to the workbook.
 * Reading and writing the workbook is not modelled; the numeric column names
 * are taken as given.
 */
module Report {
  import opened Wrappers
  import opened OrderedDict
  import opened Text
  import opened Priority
  import opened Classifier

  /** The longest sheet name the workbook format accepts. */
  const MaxSheetName := 31

  /** The sheet holding every difference column. */
  const OriginalSheet := "Original"

  // ---------------------------------------------------------------------------
  // Categories from group_cols

  /** `{col: [col] for col in cols}`: each name becomes a category whose one keyword is the name itself. */
  function GroupColumnCategories(cols: seq<string>): Dict<seq<string>>
    decreases |cols|
  {
    if cols == [] then []
    else Put(GroupColumnCategories(cols[..|cols| - 1]), cols[|cols| - 1], [cols[|cols| - 1]])
  }

  /** `keyword_categories`: from `group_cols` when given, otherwise empty. */
  function KeywordCategories(groupCols: Option<seq<string>>): Dict<seq<string>>
  {
    match groupCols
    case Some(cols) => GroupColumnCategories(cols)
    case None => []
  }

  /** `keyword_categories`: each name of group_cols maps to the list holding it; without group_cols nothing is mapped. */
  lemma KeywordCategoriesLookup(groupCols: Option<seq<string>>, n: string)
    ensures Get(KeywordCategories(groupCols), n) ==
      if groupCols.Some? && n in groupCols.value then Some([n]) else None
  {
    if groupCols.Some? {
      GroupColumnLookup(groupCols.value, n);
    }
  }

  /** The comprehension's dictionary maps each given name, and nothing else, to the list holding that name. */
  lemma {:induction false} GroupColumnLookup(cols: seq<string>, n: string)
    ensures Get(GroupColumnCategories(cols), n) == if n in cols then Some([n]) else None
  {
    if cols != [] {
      var prefix := cols[..|cols| - 1];
      var last := cols[|cols| - 1];
      var before := GroupColumnCategories(prefix);
      PutGet(before, last, [last], n);
      GroupColumnLookup(prefix, n);
      InSnoc(cols, n);
    }
  }

  /** Membership in a non-empty sequence: the last element or the ones before it. */
  lemma InSnoc<T>(s: seq<T>, x: T)
    requires s != []
    ensures x in s <==> x == s[|s| - 1] || x in s[..|s| - 1]
  {
    assert s == s[..|s| - 1] + [s[|s| - 1]];
  }

  /** Like any dictionary, the comprehension's result holds each name once. */
  lemma {:induction false} GroupColumnKeysDistinct(cols: seq<string>)
    ensures DistinctKeys(GroupColumnCategories(cols))
  {
    if cols != [] {
      GroupColumnKeysDistinct(cols[..|cols| - 1]);
    }
  }

  /** Every category built from group_cols has exactly its own name as keyword, and the keys are the names. */
  lemma GroupColumnCategoriesAreSelfKeyed(cols: seq<string>)
    ensures DistinctKeys(GroupColumnCategories(cols))
    ensures HasKeywords(GroupColumnCategories(cols))
    ensures forall i :: 0 <= i < |GroupColumnCategories(cols)| ==>
      GroupColumnCategories(cols)[i].value == [GroupColumnCategories(cols)[i].key]
    ensures forall n :: n in Keys(GroupColumnCategories(cols)) <==> n in cols
  {
    var cats := GroupColumnCategories(cols);
    GroupColumnKeysDistinct(cols);
    forall i | 0 <= i < |cats|
      ensures cats[i].value == [cats[i].key]
    {
      GetEntry(cats, i);
      GroupColumnLookup(cols, cats[i].key);
    }
    forall n
      ensures n in Keys(cats) <==> n in cols
    {
      GroupColumnLookup(cols, n);
    }
  }

  /** The first position of `x` in `s`. */
  function FirstIndex(s: seq<string>, x: string): (i: nat)
    requires x in s
    ensures i < |s| && s[i] == x && x !in s[..i]
  {
    if s[0] == x then 0
    else
      var i := FirstIndex(s[1..], x);
      assert s[..i + 1] == [s[0]] + s[1..][..i];
      i + 1
  }

  lemma FirstIndexInPrefix(s: seq<string>, m: nat, x: string)
    requires m <= |s| && x in s[..m]
    ensures x in s && FirstIndex(s, x) == FirstIndex(s[..m], x)
  {
    var i, j := FirstIndex(s, x), FirstIndex(s[..m], x);
    assert s[..m][..j] == s[..j];
  }

  /** The first position in a non-empty sequence is the one in all but its last element, or that last position. */
  lemma FirstIndexSnoc(s: seq<string>, x: string)
    requires s != [] && x in s
    ensures FirstIndex(s, x) == if x in s[..|s| - 1] then FirstIndex(s[..|s| - 1], x) else |s| - 1
  {
    if x in s[..|s| - 1] {
      FirstIndexInPrefix(s, |s| - 1, x);
    }
  }

  /** The keys of `cats` are names from `cols`, listed in the order in which they first occur there. */
  predicate InFirstOccurrenceOrder(cats: Dict<seq<string>>, cols: seq<string>)
  {
    forall i, j :: 0 <= i < j < |cats| ==>
      && cats[i].key in cols
      && cats[j].key in cols
      && FirstIndex(cols, cats[i].key) < FirstIndex(cols, cats[j].key)
  }

  /**
   * The dictionary comprehension keeps the first position of each name: the
   * categories appear in the order in which their names first occur.
   */
  lemma {:induction false} GroupColumnOrder(cols: seq<string>)
    ensures InFirstOccurrenceOrder(GroupColumnCategories(cols), cols)
  {
    if cols != [] {
      GroupColumnOrder(cols[..|cols| - 1]);
      GroupColumnStep(cols);
    }
  }

  lemma GroupColumnStep(cols: seq<string>)
    requires cols != []
    requires InFirstOccurrenceOrder(GroupColumnCategories(cols[..|cols| - 1]), cols[..|cols| - 1])
    ensures InFirstOccurrenceOrder(GroupColumnCategories(cols), cols)
  {
    var prefix := cols[..|cols| - 1];
    var before := GroupColumnCategories(prefix);
    var cats := GroupColumnCategories(cols);
    GroupColumnSnocKeys(cols);
    forall i, j | 0 <= i < j < |cats|
      ensures && cats[i].key in cols && cats[j].key in cols
              && FirstIndex(cols, cats[i].key) < FirstIndex(cols, cats[j].key)
    {
      var x, y := cats[i].key, cats[j].key;
      InSnoc(cols, x);
      FirstIndexSnoc(cols, x);
      InSnoc(cols, y);
      FirstIndexSnoc(cols, y);
      if j < |before| {
        assert x == before[i].key && y == before[j].key;
        assert FirstIndex(prefix, x) < FirstIndex(prefix, y);
      }
    }
  }

  /** One more name either leaves the keys as they were or appends it, when it is new. */
  lemma GroupColumnSnocKeys(cols: seq<string>)
    requires cols != []
    ensures
      (var before := GroupColumnCategories(cols[..|cols| - 1]);
       var cats := GroupColumnCategories(cols);
       && (|cats| == |before| ||
           (|cats| == |before| + 1 && cats[|before|].key == cols[|cols| - 1] && cols[|cols| - 1] !in cols[..|cols| - 1]))
       && forall i :: 0 <= i < |before| ==> cats[i].key == before[i].key && before[i].key in cols[..|cols| - 1])
  {
    var prefix := cols[..|cols| - 1];
    var last := cols[|cols| - 1];
    var before := GroupColumnCategories(prefix);
    var cats := GroupColumnCategories(cols);
    assert cats == Put(before, last, [last]);
    forall i | 0 <= i < |before|
      ensures before[i].key in prefix && cats[i].key == before[i].key
    {
      assert Keys(before)[i] == before[i].key;
      assert Keys(cats)[i] == cats[i].key;
      GroupColumnLookup(prefix, before[i].key);
    }
    if |cats| != |before| {
      assert Keys(cats)[|before|] == cats[|before|].key == last;
      GroupColumnLookup(prefix, last);
    }
  }

  // ---------------------------------------------------------------------------
  // Differences

  /**
   * `df.diff()` on one column of integers: one entry per row, none for the
   * first row, and for every later row the step that leads to it from the
   * previous row.
   */
  function Diff(values: seq<int>): (d: seq<Option<int>>)
    ensures |d| == |values|
    ensures |values| > 0 ==> d[0].None?
    ensures forall i :: 0 < i < |values| ==> d[i].Some? && values[i] == values[i - 1] + d[i].value
  {
    seq(|values|, i requires 0 <= i < |values| => if i == 0 then None else Some(values[i] - values[i - 1]))
  }

  /** The sum of the differences that are present. */
  function SumPresent(d: seq<Option<int>>): int
  {
    if d == [] then 0
    else SumPresent(d[..|d| - 1]) + (match d[|d| - 1] case Some(x) => x case None => 0)
  }

  /** The differences telescope: each value is the first one plus the differences up to it. */
  lemma {:induction false} DiffTelescopes(values: seq<int>, i: nat)
    requires i < |values|
    ensures values[i] == values[0] + SumPresent(Diff(values)[..i + 1])
  {
    if i > 0 {
      DiffTelescopes(values, i - 1);
      assert Diff(values)[..i + 1][..i] == Diff(values)[..i];
    }
  }

  /** Columns that start alike and have the same differences are the same column. */
  lemma DiffDeterminesValues(a: seq<int>, b: seq<int>)
    requires |a| == |b| && |a| > 0 && a[0] == b[0] && Diff(a) == Diff(b)
    ensures a == b
  {
    forall i | 0 <= i < |a|
      ensures a[i] == b[i]
    {
      DiffTelescopes(a, i);
      DiffTelescopes(b, i);
    }
  }

  // ---------------------------------------------------------------------------
  // Sheets

  /** `category[:31]`: the prefix of length min(31, |category|). */
  function SheetName(category: string): (name: string)
    ensures |name| == if |category| <= MaxSheetName then |category| else MaxSheetName
    ensures name <= category
    ensures |category| <= MaxSheetName ==> name == category
  {
    if |category| <= MaxSheetName then category else category[..MaxSheetName]
  }

  /** Names that agree in their first 31 characters get the same sheet; nothing detects it. */
  lemma SheetNamesMayCollide(a: string, b: string)
    requires |a| >= MaxSheetName && |b| >= MaxSheetName && a[..MaxSheetName] == b[..MaxSheetName]
    ensures SheetName(a) == SheetName(b)
  {
  }

  /** The sheets written, in order: "Original", then one per group in the result's order. */
  function SheetNames(groups: Groups): seq<string>
  {
    [OriginalSheet] + seq(|groups|, i requires 0 <= i < |groups| => SheetName(groups[i].key))
  }

  /**
   * The sheets `dcEx` writes for the given numeric columns: none when there
   * are no numeric columns, otherwise the classification of their difference
   * columns (which keep the names) laid out by SheetNames.
   */
  function SheetsWritten(numericCols: seq<string>, groupCols: Option<seq<string>>): Result<seq<string>, ClassifyError>
  {
    if numericCols == [] then Ok([])
    else
      match Classify(numericCols, KeywordCategories(groupCols))
      case Ok(groups) => Ok(SheetNames(groups))
      case Err(e) => Err(e)
  }

  /**
   * `dcEx` never hits the empty-keyword failure: categories from group_cols
   * always have one keyword. With numeric columns, "Original" comes first,
   * then one sheet per group in result order, at least one of them, and every
   * sheet name has at most 31 characters.
   * (Failures of the pattern compiler and of the workbook I/O are not modelled.)
   */
  lemma DcExNeverHitsEmptyKeywords(numericCols: seq<string>, groupCols: Option<seq<string>>)
    ensures SheetsWritten(numericCols, groupCols).Ok?
    ensures numericCols == [] ==> SheetsWritten(numericCols, groupCols).value == []
    ensures numericCols != [] ==>
      && |SheetsWritten(numericCols, groupCols).value| >= 2
      && SheetsWritten(numericCols, groupCols).value[0] == OriginalSheet
      && forall i :: 0 <= i < |SheetsWritten(numericCols, groupCols).value| ==>
           |SheetsWritten(numericCols, groupCols).value[i]| <= MaxSheetName
    ensures numericCols != [] ==>
      var groups := Classify(numericCols, KeywordCategories(groupCols)).value;
      && |SheetsWritten(numericCols, groupCols).value| == 1 + |groups|
      && forall i :: 0 <= i < |groups| ==>
           SheetsWritten(numericCols, groupCols).value[i + 1] == SheetName(groups[i].key)
  {
    var cats := KeywordCategories(groupCols);
    if groupCols.Some? {
      GroupColumnCategoriesAreSelfKeyed(groupCols.value);
    }
    assert HasKeywords(cats);
    if numericCols != [] {
      GroupsCoverEveryColumn(numericCols, cats, numericCols[0]);
    }
  }

  /** A successful result over some column is never empty. */
  lemma GroupsCoverEveryColumn(columns: seq<string>, categories: Dict<seq<string>>, c: string)
    requires HasKeywords(categories) && c in columns
    ensures Classify(columns, categories).Ok? && Classify(columns, categories).value != []
  {
    var order := PriorityOrder(categories);
    var done := Run(order, ColumnSet(columns));
    if done.remaining == {} {
      assert c in ColumnSet(columns);
      RunClassifiedNonEmpty(order, ColumnSet(columns), c);
    } else {
      assert Other in Keys(Put(done.classified, Other, done.remaining));
    }
  }

  /** A column claimed during a run leaves a non-empty dictionary behind. */
  lemma {:induction false} RunClassifiedNonEmpty(order: seq<Category>, cols: set<string>, c: string)
    requires c in cols && c !in Run(order, cols).remaining
    ensures Run(order, cols).classified != []
  {
    if order != [] {
      var prefix := order[..|order| - 1];
      var category := order[|order| - 1];
      var before := Run(prefix, cols);
      var matched := Matched(before.remaining, category.value);
      if matched != {} {
        assert category.key in Keys(Put(before.classified, category.key, matched));
      } else {
        RunClassifiedNonEmpty(prefix, cols, c);
      }
    }
  }

  /**
   * The category built from a name matches a column of that very name, for
   * names without regular-expression metacharacters (the model matches
   * keywords as plain literals).
   */
  lemma OwnCategoryMatches(groupCols: seq<string>, c: string)
    requires c in groupCols
    ensures exists i :: 0 <= i < |GroupColumnCategories(groupCols)| && Matches(c, GroupColumnCategories(groupCols)[i].value)
  {
    var cats := GroupColumnCategories(groupCols);
    GroupColumnCategoriesAreSelfKeyed(groupCols);
    var i :| 0 <= i < |cats| && Keys(cats)[i] == c;
    assert cats[i].value == [c];
    assert Contains(Lower(c), Lower(c));
    assert c in cats[i].value;
    assert Matches(c, cats[i].value);
  }

  /**
   * With group_cols (none of them named "Other"), a numeric column named like
   * one of them never lands in "Other": its own category matches it. This
   * holds for names without regular-expression metacharacters; the source
   * splices the names into a pattern unescaped.
   */
  lemma GroupColumnIsClaimed(numericCols: seq<string>, groupCols: seq<string>, c: string)
    requires c in numericCols && c in groupCols && Other !in groupCols
    ensures Classify(numericCols, GroupColumnCategories(groupCols)).Ok?
    ensures !InGroup(Classify(numericCols, GroupColumnCategories(groupCols)).value, Other, c)
  {
    var cats := GroupColumnCategories(groupCols);
    GroupColumnCategoriesAreSelfKeyed(groupCols);
    OwnCategoryMatches(groupCols, c);
    UnclaimedMatchesNothing(cats, c);
    var order := PriorityOrder(cats);
    PriorityOrderKeys(cats);
    var k := FirstClaimant(order, c).value;
    assert Keys(order)[k] == order[k].key;
    AssignedInGroup(numericCols, cats, Other, c);
  }
}
