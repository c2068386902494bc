/**
 * Python dictionaries with string keys, as the classifier uses them: the
 * entries keep insertion order, `d[k] = v` on a present key replaces the value
 * in place and on a new key appends an entry at the end, and `d[k]` finds the
 * entry with that key.
 */
module OrderedDict {
  import opened Wrappers

  /** One key/value pair. */
  datatype Entry<V> = Entry(key: string, value: V)

  /** The entries of a dictionary, in insertion order. */
  type Dict<V> = seq<Entry<V>>

  /** The keys in insertion order, as `list(d.keys())`. */
  function Keys<V>(d: Dict<V>): (ks: seq<string>)
    ensures |ks| == |d|
    ensures forall i :: 0 <= i < |d| ==> ks[i] == d[i].key
  {
    if d == [] then [] else [d[0].key] + Keys(d[1..])
  }

  /** No key occurs twice; every dictionary the program builds has this shape. */
  predicate DistinctKeys<V>(d: Dict<V>)
  {
    forall i, j :: 0 <= i < j < |d| ==> d[i].key != d[j].key
  }

  /** The lookup `d[k]`, `None` when `k` is absent: the value of the first entry with key `k`. */
  function Get<V>(d: Dict<V>, k: string): (r: Option<V>)
    ensures r.None? <==> k !in Keys(d)
  {
    if d == [] then None
    else if d[0].key == k then Some(d[0].value)
    else Get(d[1..], k)
  }

  /** `d[k] = v`: a present key keeps its place, a new key goes last. */
  function Put<V>(d: Dict<V>, k: string, v: V): (r: Dict<V>)
    ensures k in Keys(d) ==> Keys(r) == Keys(d)
    ensures k !in Keys(d) ==> Keys(r) == Keys(d) + [k]
    ensures DistinctKeys(d) ==> DistinctKeys(r)
  {
    if d == [] then
      [Entry(k, v)]
    else if d[0].key == k then
      KeysCons(Entry(k, v), d[1..]);
      KeysCons(d[0], d[1..]);
      [Entry(k, v)] + d[1..]
    else
      var rest := Put(d[1..], k, v);
      KeysCons(d[0], rest);
      KeysCons(d[0], d[1..]);
      [d[0]] + rest
  }

  /** After `d[k] = v`, `k` holds `v` and every other key holds what it held before. */
  lemma {:induction false} PutGet<V>(d: Dict<V>, k: string, v: V, k': string)
    ensures Get(Put(d, k, v), k') == if k' == k then Some(v) else Get(d, k')
  {
    if d != [] && d[0].key != k {
      PutGet(d[1..], k, v, k');
      assert Put(d, k, v)[1..] == Put(d[1..], k, v);
    } else if d != [] {
      assert Put(d, k, v)[1..] == d[1..];
    }
  }

  /** The keys of a dictionary with one entry placed in front. */
  lemma KeysCons<V>(e: Entry<V>, d: Dict<V>)
    ensures Keys([e] + d) == [e.key] + Keys(d)
  {
    assert ([e] + d)[1..] == d;
  }

  /** In a dictionary with distinct keys, looking up the key of an entry finds that entry's value. */
  lemma {:induction false} GetEntry<V>(d: Dict<V>, i: nat)
    requires DistinctKeys(d)
    requires i < |d|
    ensures Get(d, d[i].key) == Some(d[i].value)
  {
    if i > 0 && d[0].key != d[i].key {
      GetEntry(d[1..], i - 1);
    }
  }
}
