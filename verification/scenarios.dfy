/**
 * Small classifications worked out in full: a longer keyword claims before a
 * shorter one, equal ranks keep declaration order, and a category named
 * "Other" loses its columns to the catch-all.
 */
module Scenarios {
  import opened Wrappers
  import opened OrderedDict
  import opened Text
  import opened Priority
  import opened Classifier

  /** A single keyword matches a column when it occurs in it, ignoring case. */
  lemma MatchesOne(column: string, kw: string)
    ensures Matches(column, [kw]) == ContainsIgnoreCase(column, kw)
  {
    if ContainsIgnoreCase(column, kw) {
      assert kw in [kw];
    }
  }

  /** Two one-keyword categories are visited in the order the sort puts them. */
  lemma TwoCategoriesOrder(a: string, ka: string, b: string, kb: string)
    ensures |kb| > |ka| ==>
      PriorityOrder([Entry(a, [ka]), Entry(b, [kb])]) == [Entry(b, [kb]), Entry(a, [ka])]
    ensures |kb| <= |ka| ==>
      PriorityOrder([Entry(a, [ka]), Entry(b, [kb])]) == [Entry(a, [ka]), Entry(b, [kb])]
  {
    var first, second := Entry(a, [ka]), Entry(b, [kb]);
    assert Rank(first) == |ka| && Rank(second) == |kb|;
    assert [first, second][1..] == [second] && [second][1..] == [];
    assert PriorityOrder([second]) == Insert(second, []) == [second];
    assert PriorityOrder([first, second]) == Insert(first, [second]);
    if |kb| > |ka| {
      assert Insert(first, [second]) == [second] + Insert(first, []);
    }
  }

  /** Running two categories where the first claims every column. */
  lemma FirstOfTwoClaimsAll(first: Category, second: Category, cols: set<string>)
    requires cols != {}
    requires forall c :: c in cols ==> Matches(c, first.value)
    ensures Run([first, second], cols) == Progress([Entry(first.key, cols)], {})
  {
    var order := [first, second];
    assert order[..1] == [first] && order[..2] == order && [first][..0] == [];
    assert Matched(cols, first.value) == cols;
    assert Run([first], cols) == Progress([Entry(first.key, cols)], {});
  }

  /**
   * The longer keyword is tried first: with categories `a` = [ka] and `b` =
   * [kb], kb longer, columns that contain kb all go to `b`, whether or not
   * they also contain ka; `a` gets nothing and is absent, and nothing is left
   * for "Other". (With ka = "Tax", kb = "Revenue" and columns "Total_Revenue",
   * "Revenue_Tax", both columns go to the Revenue category.)
   */
  lemma LongerKeywordClaimsFirst(c1: string, c2: string, a: string, ka: string, b: string, kb: string)
    requires |kb| > |ka|
    requires ContainsIgnoreCase(c1, kb) && ContainsIgnoreCase(c2, kb)
    ensures Classify([c1, c2], [Entry(a, [ka]), Entry(b, [kb])]) == Ok([Entry(b, {c1, c2})])
  {
    TwoCategoriesOrder(a, ka, b, kb);
    MatchesOne(c1, kb);
    MatchesOne(c2, kb);
    assert ColumnSet([c1, c2]) == {c1, c2};
    FirstOfTwoClaimsAll(Entry(b, [kb]), Entry(a, [ka]), {c1, c2});
  }

  /**
   * Equal ranks keep declaration order: when two categories with keywords of
   * the same length both match a column, the one declared first takes it.
   */
  lemma TieGoesToFirstDeclared(column: string, a: string, ka: string, b: string, kb: string)
    requires |ka| == |kb|
    requires ContainsIgnoreCase(column, ka) && ContainsIgnoreCase(column, kb)
    ensures Classify([column], [Entry(a, [ka]), Entry(b, [kb])]) == Ok([Entry(a, {column})])
    ensures Classify([column], [Entry(b, [kb]), Entry(a, [ka])]) == Ok([Entry(b, {column})])
  {
    TwoCategoriesOrder(a, ka, b, kb);
    TwoCategoriesOrder(b, kb, a, ka);
    MatchesOne(column, ka);
    MatchesOne(column, kb);
    assert ColumnSet([column]) == {column};
    FirstOfTwoClaimsAll(Entry(a, [ka]), Entry(b, [kb]), {column});
    FirstOfTwoClaimsAll(Entry(b, [kb]), Entry(a, [ka]), {column});
  }

  /**
   * A category literally named "Other" is overwritten by the catch-all as soon
   * as some column is left over: the columns it claimed appear in no group.
   */
  lemma OtherCategoryIsOverwritten(claimed: string, leftover: string, kw: string)
    requires ContainsIgnoreCase(claimed, kw) && !ContainsIgnoreCase(leftover, kw)
    ensures Classify([claimed, leftover], [Entry(Other, [kw])]) == Ok([Entry(Other, {leftover})])
  {
    var cols := ColumnSet([claimed, leftover]);
    var category := Entry(Other, [kw]);
    assert cols == {claimed, leftover};
    MatchesOne(claimed, kw);
    MatchesOne(leftover, kw);
    assert [category][1..] == [];
    assert PriorityOrder([category]) == [category];
    assert [category][..0] == [];
    assert Matched(cols, [kw]) == {claimed};
    assert Run([category], cols) == Progress([Entry(Other, {claimed})], {leftover});
    assert HasKeywords([category]);
    assert Put([Entry(Other, {claimed})], Other, {leftover}) == [Entry(Other, {leftover})];
  }
}
