/**
 * The order in which the classifier visits its categories: `sorted` over the
 * dictionary items with the key "length of the longest keyword" and
 * `reverse=True`. Python's sort is stable, also when reversed, so categories
 * with equal keys keep their declaration order.
 */
module Priority {
  import opened OrderedDict

  /** A category: its name and its keyword list, one item of the keyword dictionary. */
  type Category = Entry<seq<string>>

  /** `max(len(kw) for kw in keywords)`; Python raises on an empty list, hence the precondition. */
  function LongestKeyword(keywords: seq<string>): nat
    requires keywords != []
  {
    if |keywords| == 1 then |keywords[0]|
    else
      var rest := LongestKeyword(keywords[1..]);
      if |keywords[0]| >= rest then |keywords[0]| else rest
  }

  /** The sort key is the length of some keyword, and no keyword is longer. */
  lemma {:induction false} LongestKeywordIsMaximum(keywords: seq<string>)
    requires keywords != []
    ensures forall kw :: kw in keywords ==> |kw| <= LongestKeyword(keywords)
    ensures exists kw :: kw in keywords && |kw| == LongestKeyword(keywords)
  {
    assert keywords[0] in keywords;
    if |keywords| > 1 {
      LongestKeywordIsMaximum(keywords[1..]);
      assert forall kw :: kw in keywords ==> kw == keywords[0] || kw in keywords[1..];
      if |keywords[0]| < LongestKeyword(keywords[1..]) {
        var kw :| kw in keywords[1..] && |kw| == LongestKeyword(keywords[1..]);
        assert kw in keywords;
      }
    }
  }

  /** Every category has at least one keyword, so that every sort key is defined. */
  predicate HasKeywords(cats: seq<Category>)
  {
    forall i :: 0 <= i < |cats| ==> cats[i].value != []
  }

  /** The sort key of a category. */
  function Rank(c: Category): nat
    requires c.value != []
  {
    LongestKeyword(c.value)
  }

  /** Longest keyword first. */
  predicate Descending(cats: seq<Category>)
    requires HasKeywords(cats)
  {
    forall i, j :: 0 <= i < j < |cats| ==> Rank(cats[i]) >= Rank(cats[j])
  }

  /** Places `c` in front of the first category whose rank is not greater than its own. */
  function Insert(c: Category, cats: seq<Category>): (r: seq<Category>)
    requires c.value != [] && HasKeywords(cats)
    ensures |r| == |cats| + 1
    ensures HasKeywords(r)
  {
    if cats == [] || Rank(cats[0]) <= Rank(c) then [c] + cats
    else [cats[0]] + Insert(c, cats[1..])
  }

  /** `sorted(categories, key=Rank, reverse=True)`, as an insertion sort. */
  function PriorityOrder(cats: seq<Category>): (r: seq<Category>)
    requires HasKeywords(cats)
    ensures |r| == |cats|
    ensures HasKeywords(r)
  {
    if cats == [] then [] else Insert(cats[0], PriorityOrder(cats[1..]))
  }

  lemma {:induction false} InsertPermutes(c: Category, cats: seq<Category>)
    requires c.value != [] && HasKeywords(cats)
    ensures multiset(Insert(c, cats)) == multiset(cats) + multiset{c}
  {
    if !(cats == [] || Rank(cats[0]) <= Rank(c)) {
      InsertPermutes(c, cats[1..]);
      assert cats == [cats[0]] + cats[1..];
    }
  }

  lemma {:induction false} InsertKeepsDescending(c: Category, cats: seq<Category>)
    requires c.value != [] && HasKeywords(cats) && Descending(cats)
    ensures Descending(Insert(c, cats))
  {
    if !(cats == [] || Rank(cats[0]) <= Rank(c)) {
      var rest := Insert(c, cats[1..]);
      InsertKeepsDescending(c, cats[1..]);
      InsertPermutes(c, cats[1..]);
      forall j | 0 <= j < |rest|
        ensures Rank(cats[0]) >= Rank(rest[j])
      {
        assert rest[j] in multiset(rest);
        if rest[j] != c {
          assert rest[j] in multiset(cats[1..]);
          var k :| 0 <= k < |cats[1..]| && cats[1..][k] == rest[j];
          assert cats[k + 1] == rest[j];
        }
      }
    }
  }

  /**
   * The priority order is a permutation of the declared categories, with the
   * longest keyword first.
   */
  lemma {:induction false} PriorityOrderIsSorted(cats: seq<Category>)
    requires HasKeywords(cats)
    ensures multiset(PriorityOrder(cats)) == multiset(cats)
    ensures Descending(PriorityOrder(cats))
  {
    if cats != [] {
      PriorityOrderIsSorted(cats[1..]);
      InsertPermutes(cats[0], PriorityOrder(cats[1..]));
      InsertKeepsDescending(cats[0], PriorityOrder(cats[1..]));
      assert cats == [cats[0]] + cats[1..];
    }
  }

  /** The categories of rank `n`, in the order they appear in `cats`. */
  function WithRank(cats: seq<Category>, n: nat): seq<Category>
    requires HasKeywords(cats)
  {
    if cats == [] then [] else (if Rank(cats[0]) == n then [cats[0]] else []) + WithRank(cats[1..], n)
  }

  lemma {:induction false} InsertWithRank(c: Category, cats: seq<Category>, n: nat)
    requires c.value != [] && HasKeywords(cats)
    ensures WithRank(Insert(c, cats), n) == (if Rank(c) == n then [c] else []) + WithRank(cats, n)
  {
    if cats == [] || Rank(cats[0]) <= Rank(c) {
      WithRankCons(c, cats, n);
    } else {
      var rest := Insert(c, cats[1..]);
      InsertWithRank(c, cats[1..], n);
      WithRankCons(cats[0], rest, n);
      WithRankCons(cats[0], cats[1..], n);
      assert [cats[0]] + cats[1..] == cats;
    }
  }

  lemma WithRankCons(c: Category, cats: seq<Category>, n: nat)
    requires c.value != [] && HasKeywords(cats)
    ensures HasKeywords([c] + cats)
    ensures WithRank([c] + cats, n) == (if Rank(c) == n then [c] else []) + WithRank(cats, n)
  {
    assert ([c] + cats)[1..] == cats;
  }

  /**
   * The sort is stable: for every rank, the categories of that rank appear in
   * the priority order exactly as they were declared.
   */
  lemma {:induction false} PriorityOrderIsStable(cats: seq<Category>, n: nat)
    requires HasKeywords(cats)
    ensures WithRank(PriorityOrder(cats), n) == WithRank(cats, n)
  {
    if cats != [] {
      PriorityOrderIsStable(cats[1..], n);
      InsertWithRank(cats[0], PriorityOrder(cats[1..]), n);
    }
  }

  /** Sorting the items of a dictionary keeps their keys distinct. */
  lemma {:induction false} PriorityOrderKeepsKeysDistinct(cats: seq<Category>)
    requires HasKeywords(cats) && DistinctKeys(cats)
    ensures DistinctKeys(PriorityOrder(cats))
  {
    if cats != [] {
      var rest := cats[1..];
      var sorted := PriorityOrder(rest);
      PriorityOrderKeepsKeysDistinct(rest);
      PriorityOrderIsSorted(rest);
      forall i | 0 <= i < |sorted|
        ensures sorted[i].key != cats[0].key
      {
        assert sorted[i] in multiset(rest);
        var k :| 0 <= k < |rest| && rest[k] == sorted[i];
        assert cats[k + 1] == sorted[i];
      }
      InsertKeepsKeysDistinct(cats[0], sorted);
    }
  }

  lemma {:induction false} InsertKeepsKeysDistinct(c: Category, cats: seq<Category>)
    requires c.value != [] && HasKeywords(cats) && DistinctKeys(cats)
    requires forall i :: 0 <= i < |cats| ==> cats[i].key != c.key
    ensures DistinctKeys(Insert(c, cats))
  {
    if !(cats == [] || Rank(cats[0]) <= Rank(c)) {
      var rest := Insert(c, cats[1..]);
      InsertKeepsKeysDistinct(c, cats[1..]);
      InsertPermutes(c, cats[1..]);
      forall j | 0 <= j < |rest|
        ensures rest[j].key != cats[0].key
      {
        assert rest[j] in multiset(rest);
        if rest[j] != c {
          assert rest[j] in multiset(cats[1..]);
          var k :| 0 <= k < |cats[1..]| && cats[1..][k] == rest[j];
          assert cats[k + 1] == rest[j];
        }
      }
    }
  }
}
